/** Bytes, 32-bit integers in both byte orders, and C++ strings as bytes. */
module Bytes {

  const TWO_32: nat := 0x1_0000_0000

  datatype Option<+T> = None | Some(value: T)

  function ByteOf(n: nat): bv8
    requires n < 256
  {
    n as bv8
  }

  function NatOf(b: bv8): (n: nat)
    ensures n < 256
  {
    b as nat
  }

  lemma ByteOfNat(b: bv8)
    ensures ByteOf(NatOf(b)) == b
  {
  }

  lemma NextByte(b: bv8)
    requires b != 255
    ensures (b + 1) as nat == b as nat + 1
  {
  }

  lemma {:induction false} ByteWithValue(n: nat) returns (b: bv8)
    requires n < 256
    ensures NatOf(b) == n
  {
    if n == 0 {
      b := 0;
    } else {
      b := ByteWithValue(n - 1);
      NextByte(b);
      b := b + 1;
    }
  }

  lemma NatOfByte(n: nat)
    requires n < 256
    ensures NatOf(ByteOf(n)) == n
  {
    var b := ByteWithValue(n);
    ByteOfNat(b);
  }

  /** Conversion of a wider integer to uint32_t. */
  function Trunc32(n: int): (r: nat)
    ensures r < TWO_32
    ensures 0 <= n < TWO_32 ==> r == n
  {
    n % TWO_32
  }

  /** Four bytes, most significant first: what htonl leaves in memory. */
  function BigEndian(n: nat): (r: seq<bv8>)
    requires n < TWO_32
    ensures |r| == 4
  {
    [ByteOf(n / 256 / 256 / 256), ByteOf(n / 256 / 256 % 256), ByteOf(n / 256 % 256), ByteOf(n % 256)]
  }

  function FromBigEndian(b: seq<bv8>): (n: nat)
    requires |b| == 4
    ensures n < TWO_32
  {
    AppendByte(AppendByte(AppendByte(NatOf(b[0]), NatOf(b[1])), NatOf(b[2])), NatOf(b[3]))
  }

  function AppendByte(high: nat, low: nat): (n: nat)
    requires low < 256
    ensures high < 0x100_0000 ==> n < TWO_32
    ensures high < 0x1_0000 ==> n < 0x100_0000
    ensures high < 256 ==> n < 0x1_0000
  {
    high * 256 + low
  }

  /** The value of four bytes by place, the first byte weighing most. */
  function PlaceValue(b: seq<bv8>): nat
    requires |b| == 4
  {
    NatOf(b[0]) * 0x100_0000 + NatOf(b[1]) * 0x1_0000 + NatOf(b[2]) * 0x100 + NatOf(b[3])
  }

  /** Every byte of network order has its place value, the first one the highest. */
  lemma BigEndianPlaces(n: nat)
    requires n < TWO_32
    ensures var b := BigEndian(n);
            && NatOf(b[0]) * 0x100_0000 + NatOf(b[1]) * 0x1_0000 + NatOf(b[2]) * 0x100 + NatOf(b[3]) == n
            && PlaceValue(b) == n
  {
    hide ByteOf, NatOf;
    NatOfByte(n / 256 / 256 / 256);
    NatOfByte(n / 256 / 256 % 256);
    NatOfByte(n / 256 % 256);
    NatOfByte(n % 256);
  }

  /** And of host order, the first one the lowest. */
  lemma LittleEndianPlaces(n: nat)
    requires n < TWO_32
    ensures var b := LittleEndian(n);
            NatOf(b[0]) + NatOf(b[1]) * 0x100 + NatOf(b[2]) * 0x1_0000 + NatOf(b[3]) * 0x100_0000 == n
  {
    hide BigEndian, NatOf;
    BigEndianPlaces(n);
  }

  /** Conversion to uint32_t keeps the residue, of negative numbers too. */
  lemma Trunc32Residue(n: int, k: int)
    ensures Trunc32(n + k * TWO_32) == Trunc32(n)
    ensures 0 <= n < TWO_32 ==> Trunc32(n + k * TWO_32) == n
  {
  }

  lemma FromToBigEndian(n: nat)
    requires n < TWO_32
    ensures FromBigEndian(BigEndian(n)) == n
  {
    hide ByteOf, NatOf;
    NatOfByte(n / 256 / 256 / 256);
    NatOfByte(n / 256 / 256 % 256);
    NatOfByte(n / 256 % 256);
    NatOfByte(n % 256);
  }

  lemma Digit(q: nat, r: nat)
    requires r < 256
    ensures AppendByte(q, r) / 256 == q && AppendByte(q, r) % 256 == r
  {
  }

  lemma ToFromBigEndian(b: seq<bv8>)
    requires |b| == 4
    ensures BigEndian(FromBigEndian(b)) == b
  {
    hide ByteOf, NatOf;
    var n1 := NatOf(b[0]);
    var n2 := AppendByte(n1, NatOf(b[1]));
    var n3 := AppendByte(n2, NatOf(b[2]));
    Digit(n1, NatOf(b[1]));
    Digit(n2, NatOf(b[2]));
    Digit(n3, NatOf(b[3]));
    ByteOfNat(b[0]);
    ByteOfNat(b[1]);
    ByteOfNat(b[2]);
    ByteOfNat(b[3]);
  }

  lemma BigEndianInjective(m: nat, n: nat)
    requires m < TWO_32 && n < TWO_32 && BigEndian(m) == BigEndian(n)
    ensures m == n
  {
    hide BigEndian, FromBigEndian;
    FromToBigEndian(m);
    FromToBigEndian(n);
  }

  /** Four bytes, least significant first: a host integer copied by memcpy. */
  function LittleEndian(n: nat): (r: seq<bv8>)
    requires n < TWO_32
    ensures |r| == 4
  {
    var b := BigEndian(n);
    [b[3], b[2], b[1], b[0]]
  }

  function FromLittleEndian(b: seq<bv8>): (n: nat)
    requires |b| == 4
    ensures n < TWO_32
  {
    FromBigEndian([b[3], b[2], b[1], b[0]])
  }

  lemma LittleEndianInverse(n: nat, b: seq<bv8>)
    requires n < TWO_32 && |b| == 4
    ensures FromLittleEndian(LittleEndian(n)) == n && LittleEndian(FromLittleEndian(b)) == b
  {
    hide BigEndian, FromBigEndian;
    FromToBigEndian(n);
    ToFromBigEndian([b[3], b[2], b[1], b[0]]);
    var e := BigEndian(n);
    assert [e[0], e[1], e[2], e[3]] == e;
  }

  /** The same for a word that is used as a bit vector. */
  function WordBytes(w: bv32): (r: seq<bv8>)
    ensures |r| == 4
  {
    [(w & 0xFF) as bv8, ((w >> 8) & 0xFF) as bv8, ((w >> 16) & 0xFF) as bv8, (w >> 24) as bv8]
  }

  function FromWordBytes(b: seq<bv8>): bv32
    requires |b| == 4
  {
    (b[0] as bv32) | ((b[1] as bv32) << 8) | ((b[2] as bv32) << 16) | ((b[3] as bv32) << 24)
  }

  lemma FromToWordBytes(w: bv32)
    ensures FromWordBytes(WordBytes(w)) == w
  {
  }

  lemma ToFromWordBytes(b: seq<bv8>)
    requires |b| == 4
    ensures WordBytes(FromWordBytes(b)) == b
  {
  }

  /** A std::string holds bytes: its characters are below 256. */
  predicate IsText(s: string) {
    forall c | c in s :: c as int < 256
  }

  function ToBytes(s: string): (r: seq<bv8>)
    ensures |r| == |s|
  {
    seq(|s|, i requires 0 <= i < |s| => ByteOf(s[i] as int % 256))
  }

  function CharOf(b: bv8): char {
    NatOf(b) as char
  }

  function FromBytes(b: seq<bv8>): (r: string)
    ensures |r| == |b| && IsText(r)
  {
    seq(|b|, i requires 0 <= i < |b| => CharOf(b[i]))
  }

  /** Byte i of a text is the code of character i. */
  lemma ToBytesAt(s: string, i: nat)
    requires IsText(s) && i < |s|
    ensures NatOf(ToBytes(s)[i]) == s[i] as int && FromBytes(ToBytes(s))[i] == s[i]
  {
    hide ByteOf, NatOf;
    assert s[i] in s;
    NatOfByte(s[i] as int);
  }

  lemma FromToBytes(s: string)
    requires IsText(s)
    ensures FromBytes(ToBytes(s)) == s
  {
    hide ByteOf, NatOf;
    forall i | 0 <= i < |s|
      ensures FromBytes(ToBytes(s))[i] == s[i]
    {
      assert s[i] in s;
      NatOfByte(s[i] as int);
    }
  }

  lemma ToFromBytes(b: seq<bv8>)
    ensures ToBytes(FromBytes(b)) == b
  {
    hide ByteOf, NatOf;
    forall i | 0 <= i < |b|
      ensures ToBytes(FromBytes(b))[i] == b[i]
    {
      ByteOfNat(b[i]);
    }
  }
}
