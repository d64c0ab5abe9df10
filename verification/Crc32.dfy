/** calculateCRC32: the table-driven loop proved against bit-serial division (section 8 of RFC 1952)
    and against polynomial long division (section 8.1.1.6.2 of ITU-T V.42). */
module Crc32 {
  import Bytes
  import opened Polynomials

  /** The generator, reflected: bit k of a register is the coefficient of x^(31-k). */
  const POLYNOMIAL: bv32 := 0xEDB8_8320

  const ALL_ONES: bv32 := 0xFFFF_FFFF

  // ---------------------------------------------------------------------------------------------
  // The checksum as it is defined
  // ---------------------------------------------------------------------------------------------

  function Add(x: bv32, y: bv32): bv32 { x ^ y }

  function Half(w: bv32): bv32 { w >> 1 }

  predicate Low(w: bv32) { w & 1 == 1 }

  /** Multiplies the register by x modulo the generator. */
  function Shift(c: bv32): bv32 {
    if Low(c) then Add(Half(c), POLYNOMIAL) else Half(c)
  }

  function Bit(b: bool): bv32 {
    if b then 1 else 0
  }

  /** The n low bits of a word, lowest first: of a register, the coefficients of x^31 downwards. */
  function WordBits(w: bv32, n: nat): (r: seq<bool>)
    ensures |r| == n
    decreases n
  {
    if n == 0 then [] else [Low(w)] + WordBits(Half(w), n - 1)
  }

  function Wide(b: bv8): bv32 { b as bv32 }

  /** The message as a polynomial: the bytes in order, each byte's low bit first. */
  function Bits(data: seq<bv8>): (r: seq<bool>)
    ensures |r| == 8 * |data|
  {
    if data == [] then [] else WordBits(Wide(data[0]), 8) + Bits(data[1..])
  }

  /** Bit-by-bit division: each message bit is added to the low end of the register, then one shift. */
  function Divide(c: bv32, bits: seq<bool>): bv32
    decreases |bits|
  {
    if bits == [] then c else Divide(Shift(Add(c, Bit(bits[0]))), bits[1..])
  }

  function Complement(c: bv32): bv32 { !c }

  function Checksum(data: seq<bv8>): bv32 {
    Complement(Divide(ALL_ONES, Bits(data)))
  }

  // ---------------------------------------------------------------------------------------------
  // The implementation
  // ---------------------------------------------------------------------------------------------

  function Row(i: bv8, e0: bv32, e1: bv32, e2: bv32, e3: bv32): bv32 {
    if i & 2 == 0 then (if i & 1 == 0 then e0 else e1) else (if i & 1 == 0 then e2 else e3)
  }

  /** The 256 constants of crc32_table, four to a row as in the source, found by bisection. */
  function Table(i: bv8): bv32 {
    if i < 128 then
      if i < 64 then
        if i < 32 then
          if i < 16 then
            if i < 8 then
              if i < 4 then
                Row(i, 0x0000_0000, 0x7707_3096, 0xee0e_612c, 0x9909_51ba)
              else
                Row(i, 0x076d_c419, 0x706a_f48f, 0xe963_a535, 0x9e64_95a3)
            else
              if i < 12 then
                Row(i, 0x0edb_8832, 0x79dc_b8a4, 0xe0d5_e91e, 0x97d2_d988)
              else
                Row(i, 0x09b6_4c2b, 0x7eb1_7cbd, 0xe7b8_2d07, 0x90bf_1d91)
          else
            if i < 24 then
              if i < 20 then
                Row(i, 0x1db7_1064, 0x6ab0_20f2, 0xf3b9_7148, 0x84be_41de)
              else
                Row(i, 0x1ada_d47d, 0x6ddd_e4eb, 0xf4d4_b551, 0x83d3_85c7)
            else
              if i < 28 then
                Row(i, 0x136c_9856, 0x646b_a8c0, 0xfd62_f97a, 0x8a65_c9ec)
              else
                Row(i, 0x1401_5c4f, 0x6306_6cd9, 0xfa0f_3d63, 0x8d08_0df5)
        else
          if i < 48 then
            if i < 40 then
              if i < 36 then
                Row(i, 0x3b6e_20c8, 0x4c69_105e, 0xd560_41e4, 0xa267_7172)
              else
                Row(i, 0x3c03_e4d1, 0x4b04_d447, 0xd20d_85fd, 0xa50a_b56b)
            else
              if i < 44 then
                Row(i, 0x35b5_a8fa, 0x42b2_986c, 0xdbbb_c9d6, 0xacbc_f940)
              else
                Row(i, 0x32d8_6ce3, 0x45df_5c75, 0xdcd6_0dcf, 0xabd1_3d59)
          else
            if i < 56 then
              if i < 52 then
                Row(i, 0x26d9_30ac, 0x51de_003a, 0xc8d7_5180, 0xbfd0_6116)
              else
                Row(i, 0x21b4_f4b5, 0x56b3_c423, 0xcfba_9599, 0xb8bd_a50f)
            else
              if i < 60 then
                Row(i, 0x2802_b89e, 0x5f05_8808, 0xc60c_d9b2, 0xb10b_e924)
              else
                Row(i, 0x2f6f_7c87, 0x5868_4c11, 0xc161_1dab, 0xb666_2d3d)
      else
        if i < 96 then
          if i < 80 then
            if i < 72 then
              if i < 68 then
                Row(i, 0x76dc_4190, 0x01db_7106, 0x98d2_20bc, 0xefd5_102a)
              else
                Row(i, 0x71b1_8589, 0x06b6_b51f, 0x9fbf_e4a5, 0xe8b8_d433)
            else
              if i < 76 then
                Row(i, 0x7807_c9a2, 0x0f00_f934, 0x9609_a88e, 0xe10e_9818)
              else
                Row(i, 0x7f6a_0dbb, 0x086d_3d2d, 0x9164_6c97, 0xe663_5c01)
          else
            if i < 88 then
              if i < 84 then
                Row(i, 0x6b6b_51f4, 0x1c6c_6162, 0x8565_30d8, 0xf262_004e)
              else
                Row(i, 0x6c06_95ed, 0x1b01_a57b, 0x8208_f4c1, 0xf50f_c457)
            else
              if i < 92 then
                Row(i, 0x65b0_d9c6, 0x12b7_e950, 0x8bbe_b8ea, 0xfcb9_887c)
              else
                Row(i, 0x62dd_1ddf, 0x15da_2d49, 0x8cd3_7cf3, 0xfbd4_4c65)
        else
          if i < 112 then
            if i < 104 then
              if i < 100 then
                Row(i, 0x4db2_6158, 0x3ab5_51ce, 0xa3bc_0074, 0xd4bb_30e2)
              else
                Row(i, 0x4adf_a541, 0x3dd8_95d7, 0xa4d1_c46d, 0xd3d6_f4fb)
            else
              if i < 108 then
                Row(i, 0x4369_e96a, 0x346e_d9fc, 0xad67_8846, 0xda60_b8d0)
              else
                Row(i, 0x4404_2d73, 0x3303_1de5, 0xaa0a_4c5f, 0xdd0d_7cc9)
          else
            if i < 120 then
              if i < 116 then
                Row(i, 0x5005_713c, 0x2702_41aa, 0xbe0b_1010, 0xc90c_2086)
              else
                Row(i, 0x5768_b525, 0x206f_85b3, 0xb966_d409, 0xce61_e49f)
            else
              if i < 124 then
                Row(i, 0x5ede_f90e, 0x29d9_c998, 0xb0d0_9822, 0xc7d7_a8b4)
              else
                Row(i, 0x59b3_3d17, 0x2eb4_0d81, 0xb7bd_5c3b, 0xc0ba_6cad)
    else
      if i < 192 then
        if i < 160 then
          if i < 144 then
            if i < 136 then
              if i < 132 then
                Row(i, 0xedb8_8320, 0x9abf_b3b6, 0x03b6_e20c, 0x74b1_d29a)
              else
                Row(i, 0xead5_4739, 0x9dd2_77af, 0x04db_2615, 0x73dc_1683)
            else
              if i < 140 then
                Row(i, 0xe363_0b12, 0x9464_3b84, 0x0d6d_6a3e, 0x7a6a_5aa8)
              else
                Row(i, 0xe40e_cf0b, 0x9309_ff9d, 0x0a00_ae27, 0x7d07_9eb1)
          else
            if i < 152 then
              if i < 148 then
                Row(i, 0xf00f_9344, 0x8708_a3d2, 0x1e01_f268, 0x6906_c2fe)
              else
                Row(i, 0xf762_575d, 0x8065_67cb, 0x196c_3671, 0x6e6b_06e7)
            else
              if i < 156 then
                Row(i, 0xfed4_1b76, 0x89d3_2be0, 0x10da_7a5a, 0x67dd_4acc)
              else
                Row(i, 0xf9b9_df6f, 0x8ebe_eff9, 0x17b7_be43, 0x60b0_8ed5)
        else
          if i < 176 then
            if i < 168 then
              if i < 164 then
                Row(i, 0xd6d6_a3e8, 0xa1d1_937e, 0x38d8_c2c4, 0x4fdf_f252)
              else
                Row(i, 0xd1bb_67f1, 0xa6bc_5767, 0x3fb5_06dd, 0x48b2_364b)
            else
              if i < 172 then
                Row(i, 0xd80d_2bda, 0xaf0a_1b4c, 0x3603_4af6, 0x4104_7a60)
              else
                Row(i, 0xdf60_efc3, 0xa867_df55, 0x316e_8eef, 0x4669_be79)
          else
            if i < 184 then
              if i < 180 then
                Row(i, 0xcb61_b38c, 0xbc66_831a, 0x256f_d2a0, 0x5268_e236)
              else
                Row(i, 0xcc0c_7795, 0xbb0b_4703, 0x2202_16b9, 0x5505_262f)
            else
              if i < 188 then
                Row(i, 0xc5ba_3bbe, 0xb2bd_0b28, 0x2bb4_5a92, 0x5cb3_6a04)
              else
                Row(i, 0xc2d7_ffa7, 0xb5d0_cf31, 0x2cd9_9e8b, 0x5bde_ae1d)
      else
        if i < 224 then
          if i < 208 then
            if i < 200 then
              if i < 196 then
                Row(i, 0x9b64_c2b0, 0xec63_f226, 0x756a_a39c, 0x026d_930a)
              else
                Row(i, 0x9c09_06a9, 0xeb0e_363f, 0x7207_6785, 0x0500_5713)
            else
              if i < 204 then
                Row(i, 0x95bf_4a82, 0xe2b8_7a14, 0x7bb1_2bae, 0x0cb6_1b38)
              else
                Row(i, 0x92d2_8e9b, 0xe5d5_be0d, 0x7cdc_efb7, 0x0bdb_df21)
          else
            if i < 216 then
              if i < 212 then
                Row(i, 0x86d3_d2d4, 0xf1d4_e242, 0x68dd_b3f8, 0x1fda_836e)
              else
                Row(i, 0x81be_16cd, 0xf6b9_265b, 0x6fb0_77e1, 0x18b7_4777)
            else
              if i < 220 then
                Row(i, 0x8808_5ae6, 0xff0f_6a70, 0x6606_3bca, 0x1101_0b5c)
              else
                Row(i, 0x8f65_9eff, 0xf862_ae69, 0x616b_ffd3, 0x166c_cf45)
        else
          if i < 240 then
            if i < 232 then
              if i < 228 then
                Row(i, 0xa00a_e278, 0xd70d_d2ee, 0x4e04_8354, 0x3903_b3c2)
              else
                Row(i, 0xa767_2661, 0xd060_16f7, 0x4969_474d, 0x3e6e_77db)
            else
              if i < 236 then
                Row(i, 0xaed1_6a4a, 0xd9d6_5adc, 0x40df_0b66, 0x37d8_3bf0)
              else
                Row(i, 0xa9bc_ae53, 0xdebb_9ec5, 0x47b2_cf7f, 0x30b5_ffe9)
          else
            if i < 248 then
              if i < 244 then
                Row(i, 0xbdbd_f21c, 0xcaba_c28a, 0x53b3_9330, 0x24b4_a3a6)
              else
                Row(i, 0xbad0_3605, 0xcdd7_0693, 0x54de_5729, 0x23d9_67bf)
            else
              if i < 252 then
                Row(i, 0xb366_7a2e, 0xc461_4ab8, 0x5d68_1b02, 0x2a6f_2b94)
              else
                Row(i, 0xb40b_be37, 0xc30c_8ea1, 0x5a05_df1b, 0x2d02_ef8d)
  }

  /** The loop body of calculateCRC32. */
  function TableStep(crc: bv32, byte: bv8): bv32 {
    Table(LowByte(crc ^ (byte as bv32))) ^ (crc >> 8)
  }

  function LowByte(w: bv32): bv8 { (w & 0xFF) as bv8 }

  method CalculateCRC32(data: seq<bv8>) returns (r: bv32)
    ensures r == Checksum(data)
  {
    hide TableStep, Shift, WordBits, Complement;
    var crc := ALL_ONES;
    for i := 0 to |data|
      invariant crc == Divide(ALL_ONES, Bits(data[..i]))
    {
      assert data[..i + 1] == data[..i] + [data[i]];
      BitsAppend(data[..i], data[i]);
      DivideAppend(ALL_ONES, Bits(data[..i]), WordBits(Wide(data[i]), 8));
      ByteStep(crc, data[i]);
      crc := TableStep(crc, data[i]);
    }
    assert data[..|data|] == data;
    Complements(crc);
    r := crc ^ ALL_ONES;
  }

  // Facts about words, for use where the word operations themselves are hidden.

  lemma Complements(c: bv32)
    ensures c ^ ALL_ONES == Complement(c) && Complement(Complement(c)) == c
  {
  }

  lemma LowAdd(x: bv32, y: bv32)
    ensures Low(Add(x, y)) == (Low(x) != Low(y))
  {
  }

  lemma HalfAdd(x: bv32, y: bv32)
    ensures Half(Add(x, y)) == Add(Half(x), Half(y))
  {
  }

  lemma AddAssociates(x: bv32, y: bv32, z: bv32)
    ensures Add(Add(x, y), z) == Add(x, Add(y, z))
  {
  }

  lemma AddCommutes(x: bv32, y: bv32)
    ensures Add(x, y) == Add(y, x)
  {
  }

  lemma AddZero(x: bv32)
    ensures Add(x, 0) == x
  {
  }

  lemma AddFacts(x: bv32, y: bv32, z: bv32)
    ensures Low(Add(x, y)) == (Low(x) != Low(y)) && Half(Add(x, y)) == Add(Half(x), Half(y))
    ensures Add(Add(x, y), z) == Add(x, Add(y, z)) == Add(Add(x, z), y)
    ensures Add(x, 0) == x
  {
    hide Low, Half, Add;
    LowAdd(x, y);
    HalfAdd(x, y);
    AddAssociates(x, y, z);
    AddAssociates(x, z, y);
    AddCommutes(y, z);
    AddZero(x);
  }

  lemma BitFacts(b: bool)
    ensures Low(Bit(b)) == b && Half(Bit(b)) == 0
  {
  }

  lemma LowBit(w: bv32)
    ensures w == Add(Bit(Low(w)), Half(w) << 1) && !Low(Half(w) << 1) && Half(Half(w) << 1) == Half(w)
  {
  }

  /** The high part of a register only moves down; its low bit decides what is added. */
  lemma ShiftSplit(lo: bv32, hi: bv32)
    requires !Low(hi)
    ensures Shift(Add(lo, hi)) == Add(Shift(lo), Half(hi))
  {
    hide Low, Half, Add;
    AddFacts(lo, hi, 0);
    AddFacts(Half(lo), Half(hi), POLYNOMIAL);
  }

  function ShiftMany(c: bv32, n: nat): bv32
    decreases n
  {
    if n == 0 then c else ShiftMany(Shift(c), n - 1)
  }

  function HalfMany(c: bv32, n: nat): bv32
    decreases n
  {
    if n == 0 then c else HalfMany(Half(c), n - 1)
  }

  /** hi has no bits among its n lowest. */
  predicate LowFree(hi: bv32, n: nat)
    decreases n
  {
    n == 0 || (!Low(hi) && LowFree(Half(hi), n - 1))
  }

  /** w has no bits above its n lowest. */
  predicate Short(w: bv32, n: nat)
    decreases n
  {
    if n == 0 then w == 0 else Short(Half(w), n - 1)
  }

  lemma {:induction false} ShiftManySplit(lo: bv32, hi: bv32, n: nat)
    requires LowFree(hi, n)
    ensures ShiftMany(Add(lo, hi), n) == Add(ShiftMany(lo, n), HalfMany(hi, n))
    decreases n
  {
    hide Low, Half, Add, Shift;
    if n > 0 {
      ShiftSplit(lo, hi);
      ShiftManySplit(Shift(lo), Half(hi), n - 1);
    }
  }

  function Shift8(c: bv32): bv32 {
    Shift(Shift(Shift(Shift(Shift(Shift(Shift(Shift(c))))))))
  }

  /** Each of the 256 table entries is eight bitwise steps of its index. */
  lemma TableEntry(i: bv8)
    ensures Table(i) == ShiftMany(Wide(i), 8)
  {
    hide Table, Shift, Shift8;
    TableShift8(i);
    ShiftEight(Wide(i));
  }

  lemma TableShift8(i: bv8)
    ensures Table(i) == Shift8(Wide(i))
  {
    hide Table, Shift8;
    if i < 64 {
      FirstQuarter(i);
    } else if i < 128 {
      SecondQuarter(i);
    } else if i < 192 {
      ThirdQuarter(i);
    } else {
      LastQuarter(i);
    }
  }

  lemma FirstQuarter(i: bv8)
    requires i < 64
    ensures Table(i) == Shift8(Wide(i))
  {
  }

  lemma SecondQuarter(i: bv8)
    requires 64 <= i < 128
    ensures Table(i) == Shift8(Wide(i))
  {
  }

  lemma ThirdQuarter(i: bv8)
    requires 128 <= i < 192
    ensures Table(i) == Shift8(Wide(i))
  {
  }

  lemma LastQuarter(i: bv8)
    requires 192 <= i
    ensures Table(i) == Shift8(Wide(i))
  {
  }

  lemma ShiftEight(c: bv32)
    ensures ShiftMany(c, 8) == Shift8(c)
  {
    hide Shift;
    var c4 := Shift(Shift(Shift(Shift(c))));
    assert ShiftMany(c, 8) == ShiftMany(Shift(Shift(c)), 6);
    assert ShiftMany(c, 8) == ShiftMany(c4, 4);
    assert ShiftMany(c4, 4) == ShiftMany(Shift(Shift(c4)), 2);
  }

  function Down8(w: bv32): bv32 { w >> 8 }

  lemma HalfFour(w: bv32)
    ensures Half(Half(Half(Half(w)))) == w >> 4
  {
  }

  lemma DownTwice(w: bv32)
    ensures (w >> 4) >> 4 == Down8(w)
  {
  }

  lemma HalfEight(w: bv32)
    ensures HalfMany(w, 8) == Down8(w)
  {
    hide Half, Down8;
    var w4 := Half(Half(Half(Half(w))));
    assert HalfMany(w, 8) == HalfMany(Half(Half(w)), 6);
    assert HalfMany(w, 8) == HalfMany(w4, 4);
    assert HalfMany(w4, 4) == HalfMany(Half(Half(w4)), 2);
    HalfFour(w);
    HalfFour(w4);
    DownTwice(w);
  }

  function HighBytes(w: bv32): bv32 { w & 0xFFFF_FF00 }

  lemma HighBits(x: bv32)
    ensures var h := HighBytes(x); var h4 := Half(Half(Half(Half(h))));
            && !Low(h) && !Low(Half(h)) && !Low(Half(Half(h))) && !Low(Half(Half(Half(h))))
            && !Low(h4) && !Low(Half(h4)) && !Low(Half(Half(h4))) && !Low(Half(Half(Half(h4))))
  {
  }

  lemma HighPart(x: bv32)
    ensures LowFree(HighBytes(x), 8)
  {
    hide Low, Half, HighBytes;
    var h := HighBytes(x);
    var h4 := Half(Half(Half(Half(h))));
    HighBits(x);
    assert LowFree(Half(Half(h4)), 2);
    assert LowFree(h4, 4);
    assert LowFree(Half(Half(h)), 6);
  }

  lemma ByteParts(x: bv32)
    ensures x == Add(Wide(LowByte(x)), HighBytes(x))
  {
  }

  lemma HighKept(c: bv32, b: bv8)
    ensures Down8(HighBytes(Add(c, Wide(b)))) == Down8(c)
  {
  }

  lemma TableStepNamed(c: bv32, b: bv8)
    ensures TableStep(c, b) == Add(Table(LowByte(Add(c, Wide(b)))), Down8(c))
  {
    hide Table, LowByte;
    calc {
      TableStep(c, b);
      Table(LowByte(c ^ (b as bv32))) ^ (c >> 8);
      Add(Table(LowByte(c ^ (b as bv32))), Down8(c));
      Add(Table(LowByte(Add(c, Wide(b)))), Down8(c));
    }
  }

  lemma ByteDown(b: bv8)
    ensures Down8(Wide(b)) == 0
  {
  }

  lemma ByteIsShort(b: bv8)
    ensures Short(Wide(b), 8)
  {
    hide *;
    HalfEight(Wide(b));
    ByteDown(b);
    ShortHalf(Wide(b), 8);
  }

  lemma {:induction false} ShortHalf(w: bv32, n: nat)
    ensures Short(w, n) == (HalfMany(w, n) == 0)
    decreases n
  {
    hide Half;
    if n > 0 {
      ShortHalf(Half(w), n - 1);
    }
  }

  /** One table lookup divides the eight bits of one byte. */
  lemma ByteStep(c: bv32, b: bv8)
    ensures TableStep(c, b) == Divide(c, WordBits(Wide(b), 8))
  {
    hide *;
    var x := Add(c, Wide(b));
    TableStepNamed(c, b);
    ByteParts(x);
    HighKept(c, b);
    TableEntry(LowByte(x));
    HighPart(x);
    HalfEight(HighBytes(x));
    ShiftManySplit(Wide(LowByte(x)), HighBytes(x), 8);
    ByteIsShort(b);
    DivideWord(c, Wide(b), 8);
  }

  /** A whole word of message bits may be added to the register at once:
      dividing them is then that many plain shifts. */
  lemma {:induction false} DivideWord(c: bv32, w: bv32, n: nat)
    requires Short(w, n)
    ensures Divide(c, WordBits(w, n)) == ShiftMany(Add(c, w), n)
    decreases n
  {
    hide Shift, Add, Half, Low, Bit;
    if n == 0 {
      AddFacts(c, 0, 0);
    } else {
      var b, rest := Bit(Low(w)), Half(w) << 1;
      LowBit(w);
      AddFacts(c, b, rest);
      ShiftSplit(Add(c, b), rest);
      DivideWord(Shift(Add(c, b)), Half(w), n - 1);
    }
  }

  lemma LowBytes(c: bv32, w: bv32)
    ensures LowByte(Add(Add(c, w), Wide(0))) == LowByte(Add(c, Wide(LowByte(w))))
  {
  }

  lemma DownAdd(x: bv32, y: bv32)
    ensures Down8(Add(x, y)) == Add(Down8(x), Down8(y))
  {
  }

  lemma WordStep(c: bv32, w: bv32)
    ensures TableStep(Add(c, w), 0) == Add(TableStep(c, LowByte(w)), Down8(w))
  {
    hide *;
    TableStepNamed(Add(c, w), 0);
    TableStepNamed(c, LowByte(w));
    LowBytes(c, w);
    DownAdd(c, w);
    AddAssociates(Table(LowByte(Add(c, Wide(LowByte(w))))), Down8(c), Down8(w));
  }

  lemma BytesOfWord(w: bv32)
    ensures var w1 := Down8(w); var w2 := Down8(w1);
            Bytes.WordBytes(w) == [LowByte(w), LowByte(w1), LowByte(w2), LowByte(Down8(w2))]
  {
  }

  /** Four bytes can be added to the register at once: four table steps on the bytes of a word are four
      table steps on zeros after adding the word. */
  lemma FourByteIdentity(c: bv32, w: bv32)
    ensures var b := Bytes.WordBytes(w);
            TableStep(TableStep(TableStep(TableStep(c, b[0]), b[1]), b[2]), b[3]) ==
            TableStep(TableStep(TableStep(TableStep(Add(c, w), 0), 0), 0), 0)
  {
    BytesOfWord(w);
    FourDown(w);
    hide Add, TableStep, LowByte, Down8, Bytes.WordBytes;
    var w1 := Down8(w);
    var w2 := Down8(w1);
    var w3 := Down8(w2);
    var c1 := TableStep(c, LowByte(w));
    var c2 := TableStep(c1, LowByte(w1));
    var c3 := TableStep(c2, LowByte(w2));
    WordStep(c, w);
    WordStep(c1, w1);
    WordStep(c2, w2);
    WordStep(c3, w3);
    AddZero(TableStep(c3, LowByte(w3)));
  }

  lemma {:induction false} DivideAppend(c: bv32, x: seq<bool>, y: seq<bool>)
    ensures Divide(c, x + y) == Divide(Divide(c, x), y)
    decreases |x|
  {
    hide Shift, Add, Bit;
    if x == [] {
      assert x + y == y;
    } else {
      assert (x + y)[1..] == x[1..] + y;
      DivideAppend(Shift(Add(c, Bit(x[0]))), x[1..], y);
    }
  }

  lemma {:induction false} BitsAppend(x: seq<bv8>, b: bv8)
    ensures Bits(x + [b]) == Bits(x) + WordBits(Wide(b), 8)
    decreases |x|
  {
    hide WordBits, Wide;
    if x == [] {
      assert [b][1..] == [];
      assert x + [b] == [b];
    } else {
      assert (x + [b])[1..] == x[1..] + [b];
      BitsAppend(x[1..], b);
    }
  }

  // ---------------------------------------------------------------------------------------------
  // Serial division is polynomial long division
  // ---------------------------------------------------------------------------------------------

  lemma {:induction false} WordBitsAdd(x: bv32, y: bv32, n: nat)
    ensures WordBits(Add(x, y), n) == Xor(WordBits(x, n), WordBits(y, n))
    decreases n
  {
    hide Add, Half, Low;
    if n > 0 {
      AddFacts(x, y, 0);
      WordBitsAdd(Half(x), Half(y), n - 1);
    }
  }

  lemma {:induction false} WordBitsExtend(w: bv32, n: nat)
    requires Short(w, n)
    ensures WordBits(w, n + 1) == WordBits(w, n) + [false]
    decreases n
  {
    if n == 0 {
      assert !Low(0);
    } else {
      hide Half, Low;
      WordBitsExtend(Half(w), n - 1);
    }
  }

  lemma {:induction false} WordBitsInjective(x: bv32, y: bv32, n: nat)
    requires Short(x, n) && Short(y, n) && WordBits(x, n) == WordBits(y, n)
    ensures x == y
    decreases n
  {
    hide Half, Low, Add;
    if n > 0 {
      assert WordBits(x, n)[0] == WordBits(y, n)[0];
      assert WordBits(Half(x), n - 1) == WordBits(x, n)[1..] == WordBits(y, n)[1..] == WordBits(Half(y), n - 1);
      WordBitsInjective(Half(x), Half(y), n - 1);
      LowBit(x);
      LowBit(y);
    }
  }

  lemma {:induction false} HalfManySum(w: bv32, m: nat, n: nat)
    ensures HalfMany(w, m + n) == HalfMany(HalfMany(w, m), n)
    decreases m
  {
    hide Half;
    if m > 0 {
      HalfManySum(Half(w), m - 1, n);
    }
  }

  lemma FourDown(w: bv32)
    ensures Down8(Down8(Down8(Down8(w)))) == 0
  {
  }

  lemma WordIsShort(w: bv32)
    ensures Short(w, 32) && Short(Half(w), 31)
  {
    hide *;
    var w1 := Down8(w);
    var w2 := Down8(w1);
    HalfEight(w);
    HalfEight(w1);
    HalfEight(w2);
    HalfEight(Down8(w2));
    HalfManySum(w, 8, 24);
    HalfManySum(w1, 8, 16);
    HalfManySum(w2, 8, 8);
    FourDown(w);
    ShortHalf(w, 32);
    ShortOnce(w, 32);
  }

  lemma ShortOnce(w: bv32, n: nat)
    requires n > 0
    ensures Short(w, n) == Short(Half(w), n - 1)
  {
  }

  lemma WordBitsTail(w: bv32, n: nat)
    requires n > 0
    ensures WordBits(w, n)[0] == Low(w) && WordBits(w, n)[1..] == WordBits(Half(w), n - 1)
  {
  }

  lemma FourThen(a: bool, b: bool, c: bool, d: bool, rest: seq<bool>)
    ensures [a] + ([b] + ([c] + ([d] + rest))) == [a, b, c, d] + rest
  {
  }

  lemma FourBits(w: bv32, n: nat)
    requires n >= 4
    ensures WordBits(w, n) == [Low(w), Low(Half(w)), Low(Half(Half(w))), Low(Half(Half(Half(w))))]
                              + WordBits(Half(Half(Half(Half(w)))), n - 4)
  {
    hide Half, Low;
    var w1 := Half(w);
    var w2 := Half(w1);
    var w3 := Half(w2);
    var w4 := Half(w3);
    assert WordBits(w3, n - 3) == [Low(w3)] + WordBits(w4, n - 4);
    assert WordBits(w2, n - 2) == [Low(w2)] + WordBits(w3, n - 3);
    assert WordBits(w1, n - 1) == [Low(w1)] + WordBits(w2, n - 2);
    assert WordBits(w, n) == [Low(w)] + WordBits(w1, n - 1);
    FourThen(Low(w), Low(w1), Low(w2), Low(w3), WordBits(w4, n - 4));
  }

  function Nibble(w: bv32): seq<bool> {
    [w & 1 != 0, w & 2 != 0, w & 4 != 0, w & 8 != 0]
  }

  lemma NibbleBits(w: bv32)
    ensures Low(w) == (w & 1 != 0) && Low(Half(w)) == (w & 2 != 0)
    ensures Low(Half(Half(w))) == (w & 4 != 0) && Low(Half(Half(Half(w)))) == (w & 8 != 0)
  {
  }

  lemma NibbleStep(w: bv32, n: nat)
    requires n >= 4
    ensures WordBits(w, n) == Nibble(w) + WordBits(w >> 4, n - 4)
  {
    hide Half, Low, WordBits;
    FourBits(w, n);
    NibbleBits(w);
    HalfFour(w);
  }

  lemma GeneratorLow()
    ensures WordBits(0xEDB8, 16) == GENERATOR[16..]
  {
    hide WordBits;
    NibbleStep(0xEDB8, 16);
    NibbleStep(0xEDB, 12);
    NibbleStep(0xED, 8);
    NibbleStep(0xE, 4);
  }

  lemma GeneratorHigh()
    ensures WordBits(POLYNOMIAL, 32) == GENERATOR[..16] + WordBits(0xEDB8, 16)
  {
    hide WordBits;
    NibbleStep(0xEDB8_8320, 32);
    NibbleStep(0xEDB_8832, 28);
    NibbleStep(0xED_B883, 24);
    NibbleStep(0xE_DB88, 20);
  }

  lemma GeneratorWord()
    ensures WordBits(POLYNOMIAL, 32) == GENERATOR
  {
    hide WordBits;
    GeneratorHigh();
    GeneratorLow();
    assert GENERATOR == GENERATOR[..16] + GENERATOR[16..];
  }

  /** One shift of the register, on coefficients. */
  lemma ShiftBits(c: bv32, b: bool)
    ensures var moved := WordBits(c, 32)[1..] + [false];
            WordBits(Shift(Add(c, Bit(b))), 32) ==
            if WordBits(c, 32)[0] != b then Xor(moved, GENERATOR) else moved
  {
    hide Half, Low, Add, Bit, WordBits, Short, Xor;
    var h := Half(c);
    BitFacts(b);
    AddFacts(c, Bit(b), 0);
    AddFacts(h, 0, 0);
    WordIsShort(c);
    WordBitsExtend(h, 31);
    WordBitsTail(c, 32);
    WordBitsAdd(h, POLYNOMIAL, 32);
    GeneratorWord();
  }

  /** The dividend for initial register c: c is added to the first 32 coefficients
      of the message times x^32. */
  function Dividend(c: bv32, bits: seq<bool>): (r: seq<bool>)
    ensures |r| == |bits| + 32
  {
    Xor(WordBits(c, 32) + Zeros(|bits|), bits + Zeros(32))
  }

  lemma DividendStep(c: bv32, bits: seq<bool>)
    requires bits != []
    ensures Reduce(Dividend(c, bits)) == Dividend(Shift(Add(c, Bit(bits[0]))), bits[1..])
  {
    hide Shift, Add, Bit, WordBits;
    var c' := Shift(Add(c, Bit(bits[0])));
    var w, w' := WordBits(c, 32), WordBits(c', 32);
    ShiftBits(c, bits[0]);
    var d, e := Dividend(c, bits), Dividend(c', bits[1..]);
    assert d[0] == (w[0] != bits[0]);
    assert Reduce(d) == e by {
      forall i | 0 <= i < |e|
        ensures Reduce(d)[i] == e[i]
      {
        if i < 32 {
          assert (w[1..] + [false])[i] == (w + Zeros(|bits|))[i + 1];
        }
      }
    }
  }

  lemma {:induction false} DivideIsRemainder(c: bv32, bits: seq<bool>)
    ensures WordBits(Divide(c, bits), 32) == Remainder(Dividend(c, bits))
    decreases |bits|
  {
    hide Shift, Add, Bit, WordBits;
    if bits == [] {
      assert Dividend(c, bits) == WordBits(c, 32);
    } else {
      hide Dividend, Reduce;
      DividendStep(c, bits);
      DivideIsRemainder(Shift(Add(c, Bit(bits[0]))), bits[1..]);
    }
  }

  /** For any fixed message the register it leaves is a one-to-one function of the register before it:
      no step of the division loses information. */
  lemma DivideInjective(c: bv32, d: bv32, bits: seq<bool>)
    requires Divide(c, bits) == Divide(d, bits)
    ensures c == d
  {
    hide Divide, WordBits, Short;
    var x, y := Dividend(c, bits), Dividend(d, bits);
    DivideIsRemainder(c, bits);
    DivideIsRemainder(d, bits);
    WordIsShort(c);
    WordIsShort(d);
    if WordBits(c, 32) == WordBits(d, 32) {
      WordBitsInjective(c, d, 32);
    } else {
      var k :| 0 <= k < 32 && WordBits(c, 32)[k] != WordBits(d, 32)[k];
      assert x[k] != y[k];
      BurstChangesRemainder(x, y, 0);
      assert false;
    }
  }

  /** The frame check sequence of V.42: the complement of the remainder that the generator leaves of
      the message with its first 32 coefficients complemented and 32 zeros appended. */
  lemma ChecksumIsRemainder(data: seq<bv8>)
    ensures WordBits(Complement(Checksum(data)), 32) ==
            Remainder(Xor(seq(32, i => true) + Zeros(8 * |data|), Bits(data) + Zeros(32)))
  {
    hide Divide, Complement, WordBits, Remainder, Xor, Bits;
    DivideIsRemainder(ALL_ONES, Bits(data));
    Complements(Divide(ALL_ONES, Bits(data)));
    OnesBits();
  }

  lemma OnesBits()
    ensures WordBits(ALL_ONES, 32) == seq(32, i => true)
  {
    hide WordBits;
    NibbleStep(0xFFFF_FFFF, 32);
    NibbleStep(0xFFF_FFFF, 28);
    NibbleStep(0xFF_FFFF, 24);
    NibbleStep(0xF_FFFF, 20);
    NibbleStep(0xFFFF, 16);
    NibbleStep(0xFFF, 12);
    NibbleStep(0xFF, 8);
    NibbleStep(0xF, 4);
  }

  // ---------------------------------------------------------------------------------------------
  // Affinity
  // ---------------------------------------------------------------------------------------------

  function XorBytes(x: seq<bv8>, y: seq<bv8>): (r: seq<bv8>)
    requires |x| == |y|
    ensures |r| == |x|
  {
    seq(|x|, i requires 0 <= i < |x| => x[i] ^ y[i])
  }

  lemma WideXor(a: bv8, b: bv8)
    ensures Wide(a ^ b) == Add(Wide(a), Wide(b))
  {
  }

  lemma XorConcat(x: seq<bool>, y: seq<bool>, u: seq<bool>, v: seq<bool>)
    requires |x| == |y| && |u| == |v|
    ensures Xor(x + u, y + v) == Xor(x, y) + Xor(u, v)
  {
  }

  lemma {:induction false} BitsXor(x: seq<bv8>, y: seq<bv8>)
    requires |x| == |y|
    ensures Bits(XorBytes(x, y)) == Xor(Bits(x), Bits(y))
  {
    hide Wide, WordBits, Xor, Add;
    if x != [] {
      assert XorBytes(x, y)[1..] == XorBytes(x[1..], y[1..]);
      BitsXor(x[1..], y[1..]);
      WideXor(x[0], y[0]);
      WordBitsAdd(Wide(x[0]), Wide(y[0]), 8);
      XorConcat(WordBits(Wide(x[0]), 8), WordBits(Wide(y[0]), 8), Bits(x[1..]), Bits(y[1..]));
    }
  }

  lemma DividendLinear(c: bv32, d: bv32, x: seq<bool>, y: seq<bool>)
    requires |x| == |y|
    ensures Dividend(Add(c, d), Xor(x, y)) == Xor(Dividend(c, x), Dividend(d, y))
  {
    WordBitsAdd(c, d, 32);
    hide WordBits;
  }

  lemma DivideLinear(c: bv32, d: bv32, x: seq<bool>, y: seq<bool>)
    requires |x| == |y|
    ensures Divide(Add(c, d), Xor(x, y)) == Add(Divide(c, x), Divide(d, y))
  {
    hide *;
    var p, q, r := Divide(c, x), Divide(d, y), Divide(Add(c, d), Xor(x, y));
    DivideIsRemainder(c, x);
    DivideIsRemainder(d, y);
    DivideIsRemainder(Add(c, d), Xor(x, y));
    DividendLinear(c, d, x, y);
    RemainderLinear(Dividend(c, x), Dividend(d, y));
    WordBitsAdd(p, q, 32);
    WordIsShort(Add(p, q));
    WordIsShort(r);
    WordBitsInjective(Add(p, q), r, 32);
  }

  lemma ComplementOfSum(x: bv32, y: bv32)
    ensures Complement(x) ^ Complement(y) == Add(x, y)
  {
  }

  lemma AddComplement(x: bv32, y: bv32)
    ensures x ^ Complement(y) == Complement(Add(x, y))
  {
  }

  lemma ThreeOnes()
    ensures Add(Add(ALL_ONES, ALL_ONES), ALL_ONES) == ALL_ONES
  {
  }

  lemma ThreeComplements(x: bv32, y: bv32, z: bv32)
    ensures Complement(x) ^ Complement(y) ^ Complement(z) == Complement(Add(Add(x, y), z))
  {
    hide Complement, Add;
    ComplementOfSum(x, y);
    AddComplement(Add(x, y), z);
  }

  lemma ChecksumNamed(data: seq<bv8>)
    ensures Checksum(data) == Complement(Divide(ALL_ONES, Bits(data)))
  {
  }

  /** The checksum is affine: the sum of three messages of one length has the sum of their checksums. */
  lemma ChecksumAffine(a: seq<bv8>, b: seq<bv8>, c: seq<bv8>)
    requires |a| == |b| == |c|
    ensures Checksum(a) ^ Checksum(b) ^ Checksum(c) == Checksum(XorBytes(XorBytes(a, b), c))
  {
    ThreeOnes();
    hide *;
    ChecksumNamed(a);
    ChecksumNamed(b);
    ChecksumNamed(c);
    ChecksumNamed(XorBytes(XorBytes(a, b), c));
    BitsXor(a, b);
    BitsXor(XorBytes(a, b), c);
    DivideLinear(ALL_ONES, ALL_ONES, Bits(a), Bits(b));
    DivideLinear(Add(ALL_ONES, ALL_ONES), ALL_ONES, Xor(Bits(a), Bits(b)), Bits(c));
    ThreeComplements(Divide(ALL_ONES, Bits(a)), Divide(ALL_ONES, Bits(b)), Divide(ALL_ONES, Bits(c)));
  }

  // ---------------------------------------------------------------------------------------------
  // Burst errors
  // ---------------------------------------------------------------------------------------------

  lemma ByteBitsInjective(a: bv8, b: bv8)
    requires WordBits(Wide(a), 8) == WordBits(Wide(b), 8)
    ensures a == b
  {
    assert Wide(a) == Wide(b) by {
      hide *;
      ByteIsShort(a);
      ByteIsShort(b);
      WordBitsInjective(Wide(a), Wide(b), 8);
    }
  }

  lemma {:induction false} BitsInjective(x: seq<bv8>, y: seq<bv8>)
    requires |x| == |y| && Bits(x) == Bits(y)
    ensures x == y
  {
    hide Wide, WordBits;
    if x != [] {
      assert WordBits(Wide(x[0]), 8) == Bits(x)[..8] == Bits(y)[..8] == WordBits(Wide(y[0]), 8);
      assert Bits(x[1..]) == Bits(x)[8..] == Bits(y)[8..] == Bits(y[1..]);
      ByteBitsInjective(x[0], y[0]);
      BitsInjective(x[1..], y[1..]);
    }
  }

  lemma ComplementOneToOne(x: bv32, y: bv32)
    ensures Complement(x) == Complement(y) <==> x == y
  {
  }

  lemma DifferenceDividend(p: seq<bv8>, q: seq<bv8>)
    requires |p| == |q|
    ensures Xor(Dividend(ALL_ONES, Bits(p)), Dividend(ALL_ONES, Bits(q))) == Xor(Bits(p), Bits(q)) + Zeros(32)
  {
    hide WordBits, Bits;
  }

  /** Exactly which changes go undetected: two messages of one length have the same checksum if and only if
      the generator divides their difference. */
  lemma SameChecksum(p: seq<bv8>, q: seq<bv8>)
    requires |p| == |q|
    ensures Checksum(p) == Checksum(q) <==> true !in Remainder(Xor(Bits(p), Bits(q)) + Zeros(32))
  {
    hide *;
    var x, y := Divide(ALL_ONES, Bits(p)), Divide(ALL_ONES, Bits(q));
    var d, e := Dividend(ALL_ONES, Bits(p)), Dividend(ALL_ONES, Bits(q));
    ChecksumNamed(p);
    ChecksumNamed(q);
    ComplementOneToOne(x, y);
    DivideIsRemainder(ALL_ONES, Bits(p));
    DivideIsRemainder(ALL_ONES, Bits(q));
    DifferenceDividend(p, q);
    RemainderLinear(d, e);
    DifferenceNonzero(Remainder(d), Remainder(e));
    WordIsShort(x);
    WordIsShort(y);
    if Remainder(d) == Remainder(e) {
      WordBitsInjective(x, y, 32);
    }
  }

  /** Two messages whose bits differ, but only within 32 consecutive bit positions, have different
      checksums, whatever the length of the messages and wherever the burst lies. */
  lemma BurstDetected(p: seq<bv8>, q: seq<bv8>, start: nat)
    requires |p| == |q| && p != q
    requires forall j | 0 <= j < 8 * |p| && !(start <= j < start + 32) :: Bits(p)[j] == Bits(q)[j]
    ensures Checksum(p) != Checksum(q)
  {
    hide Bits, Remainder, Checksum;
    if Bits(p) == Bits(q) {
      BitsInjective(p, q);
      assert false;
    }
    var k :| 0 <= k < 8 * |p| && Bits(p)[k] != Bits(q)[k];
    var d := Xor(Bits(p), Bits(q)) + Zeros(32);
    assert d[k];
    WindowRemainder(d, start);
    SameChecksum(p, q);
  }

  lemma {:induction false} BitOfByte(data: seq<bv8>, j: nat)
    requires j < 8 * |data|
    ensures Bits(data)[j] == WordBits(Wide(data[j / 8]), 8)[j % 8]
  {
    hide Wide, WordBits;
    if j >= 8 {
      BitOfByte(data[1..], j - 8);
      assert data[1..][(j - 8) / 8] == data[j / 8];
    }
  }

  /** The same for bytes: a change confined to four consecutive bytes is always detected. */
  lemma FourByteBurstDetected(p: seq<bv8>, q: seq<bv8>, start: nat)
    requires |p| == |q| && p != q
    requires forall j | 0 <= j < |p| && !(start <= j < start + 4) :: p[j] == q[j]
    ensures Checksum(p) != Checksum(q)
  {
    hide *;
    forall j | 0 <= j < 8 * |p| && !(8 * start <= j < 8 * start + 32)
      ensures Bits(p)[j] == Bits(q)[j]
    {
      BitOfByte(p, j);
      BitOfByte(q, j);
      assert !(start <= j / 8 < start + 4);
    }
    BurstDetected(p, q, 8 * start);
  }
}
