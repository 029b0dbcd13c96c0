/** The per-type codec of the client: the byte image `writeToBuffer` puts
    into a buffer and the value `getIntFromBuffer` reads back out of one.

    The helper `gos7.Helper` that does the byte work is not part of this
    model. Its `SetValueAt(buf, 0, v)` is taken to be "the fixed-width value
    `v`, most significant byte first, copied into `buf` with Go's `copy`"
    (so a buffer shorter than the value receives only its leading bytes),
    and its `GetValueAt(buf, 0, &v)` to be the big-endian read of the first
    bytes of `buf`. */
module Codec {
  import opened Wrappers
  import opened DataTypes
  import opened Address

  /** 256^n, the number of values of an n-byte unsigned integer. */
  function Pow256(n: nat): (p: nat)
    ensures p > 0
  {
    if n == 0 then 1 else 256 * Pow256(n - 1)
  }

  /** The `n`-byte big-endian image of `v`; the high bytes of a value wider
      than `n` bytes are dropped, as Go's `uint8`/`uint16` conversions do. */
  function BigEndian(v: nat, n: nat): (b: seq<u8>)
    ensures |b| == n
  {
    if n == 0 then [] else BigEndian(v / 256, n - 1) + [v % 256]
  }

  /** The unsigned value of big-endian bytes. */
  function FromBigEndian(b: seq<u8>): (v: nat)
    ensures v < Pow256(|b|)
  {
    if b == [] then 0
    else
      var high := FromBigEndian(b[..|b| - 1]);
      assert high * 256 <= (Pow256(|b| - 1) - 1) * 256;
      high * 256 + b[|b| - 1]
  }

  lemma DivModUnique(v: nat, d: nat, q: nat, m: nat)
    requires d > 0 && m < d && v == q * d + m
    ensures v / d == q && v % d == m
  {
    var k: int := v / d - q;
    assert k * d == m - v % d;
    assert k >= 1 ==> k * d >= d;
    assert k <= -1 ==> k * d + d <= 0;
  }

  /** The remainder modulo 256 * P, split into its low byte and the rest. */
  lemma ModSplit(v: nat, p: nat)
    requires p > 0
    ensures v % (256 * p) == (v / 256 % p) * 256 + v % 256
  {
    var q, r := v / 256, v % 256;
    var a, m := q / p, q % p;
    assert v == 256 * q + r;
    assert q == a * p + m;
    assert v == a * (256 * p) + (m * 256 + r);
    assert m * 256 + r < 256 * p;
    DivModUnique(v, 256 * p, a, m * 256 + r);
  }

  /** Reading back an n-byte image gives the value modulo 256^n. */
  lemma {:induction false} FromBigEndianOfBigEndian(v: nat, n: nat)
    ensures FromBigEndian(BigEndian(v, n)) == v % Pow256(n)
  {
    if n > 0 {
      var b := BigEndian(v, n);
      assert b[..n - 1] == BigEndian(v / 256, n - 1);
      FromBigEndianOfBigEndian(v / 256, n - 1);
      ModSplit(v, Pow256(n - 1));
    }
  }

  /** Writing back the value of some bytes gives the same bytes. */
  lemma {:induction false} BigEndianOfFromBigEndian(b: seq<u8>)
    ensures BigEndian(FromBigEndian(b), |b|) == b
  {
    if b != [] {
      var n := |b|;
      var high := FromBigEndian(b[..n - 1]);
      DivModUnique(FromBigEndian(b), 256, high, b[n - 1]);
      BigEndianOfFromBigEndian(b[..n - 1]);
      assert b[..n - 1] + [b[n - 1]] == b;
    }
  }

  /** Go's `copy(dst, src)` followed by keeping `dst`: the first
      `min(|dst|, |src|)` bytes come from `src`, the rest stay. */
  function CopyInto(dst: seq<u8>, src: seq<u8>): (r: seq<u8>)
    ensures |r| == |dst|
    ensures forall j | 0 <= j < |dst| :: r[j] == if j < |src| then src[j] else dst[j]
  {
    var n := if |src| < |dst| then |src| else |dst|;
    src[..n] + dst[n..]
  }

  /** The `float32` conversions of the Real type, which the model leaves
      abstract: `toBits(v)` is the IEEE-754 image of `float32(v)` and
      `fromBits(w)` is `uint32` of the `float32` whose image is `w`. */
  datatype RealConv = RealConv(toBits: u32 -> u32, fromBits: u32 -> u32)

  /** The bytes `SetValueAt` produces for a non-Bit type: `uint8(value)`,
      `uint16(value)`, `uint32(value)` or the image of `float32(value)`. */
  function ValueBytes(t: DataType, value: u32, conv: RealConv): (b: seq<u8>)
    requires IsKnown(t) && t != Bit
    ensures |b| == Size(t)
    ensures t != Real ==> FromBigEndian(b) == value % Pow256(Size(t))
  {
    var n := Size(t);
    FromBigEndianOfBigEndian(value, n);
    if t == Real then BigEndian(conv.toBits(value), 4) else BigEndian(value, n)
  }

  /** Bit `j` (0 is the least significant) of a bit-vector byte. */
  predicate BvBit(x: bv8, j: bv8)
    requires j < 8
  {
    x & (1 << j) != 0
  }

  /** Bit `j` of a byte. */
  predicate BitOf(x: u8, j: bv8)
    requires j < 8
  {
    BvBit(x as bv8, j)
  }

  lemma ByteAsBits(x: bv8)
    ensures (x as int) as bv8 == x
  {
  }

  lemma OrBits(a: bv8, b: bv8)
    ensures forall j: bv8 | j < 8 :: BvBit(a | b, j) == (BvBit(a, j) || BvBit(b, j))
  {
  }

  lemma AndNotBits(a: bv8, b: bv8)
    ensures forall j: bv8 | j < 8 :: BvBit(a & !b, j) == (BvBit(a, j) && !BvBit(b, j))
  {
  }

  /** The Bit encoder as written: a value above zero ORs the byte with the
      bit NUMBER used as a mask, and zero clears the bits of that number
      (`b |= bit`, `b &^= bit`). */
  function SetBitAsWritten(cur: u8, bit: u8, value: u32): (r: u8)
    ensures forall j: bv8 | j < 8 ::
      BitOf(r, j) == if BitOf(bit, j) then value > 0 else BitOf(cur, j)
  {
    var c, m := cur as bv8, bit as bv8;
    var b := if value > 0 then c | m else c & !m;
    OrBits(c, m);
    AndNotBits(c, m);
    ByteAsBits(b);
    b as u8
  }

  /** `1 << bit` on a `uint8`: the byte with only bit `bit` set. */
  function Mask(bit: u8): (m: u8)
    requires bit < 8
    ensures forall j: bv8 | j < 8 :: BitOf(m, j) == (j == bit as bv8)
  {
    var b: bv8 := 1 << (bit as bv8);
    ByteAsBits(b);
    b as u8
  }

  /** The Bit encoder as intended: the same update through the mask
      `1 << bit` (which is 0, so no change, for a bit number of 8 or more). */
  function SetBitIntended(cur: u8, bit: u8, value: u32): (r: u8)
    ensures bit < 8 ==> forall j: bv8 | j < 8 ::
      BitOf(r, j) == if j == bit as bv8 then value > 0 else BitOf(cur, j)
    ensures bit >= 8 ==> r == cur
  {
    if bit >= 8 then cur else SetBitAsWritten(cur, Mask(bit), value)
  }

  /** The Bit decoder: `(b >> bit) & 1` on a `uint8`, which is 0 once the
      shift reaches 8. */
  function BitAt(b: u8, bit: u8): (r: u32)
    ensures r == 0 || r == 1
    ensures bit < 8 ==> (r == 1 <==> BitOf(b, bit as bv8))
    ensures bit >= 8 ==> r == 0
  {
    if bit >= 8 then 0 else ((b as bv8 >> (bit as bv8)) & 1) as u32
  }

  /** `getIntFromBuffer`: the value at the start of `buff`, or an error for
      a type tag outside the switch. */
  function Decode(a: VmAddr, buff: seq<u8>, conv: RealConv): (r: Result<u32>)
    requires |buff| >= Size(a.dataType)
    ensures r.Err? <==> !IsKnown(a.dataType)
    ensures r.Err? ==> r.error == UnknownDataType
    ensures a.dataType == Bit ==> r.Ok? && r.value <= 1
    ensures a.dataType == Bit && a.bit < 8 ==> (r.value == 1 <==> BitOf(buff[0], a.bit as bv8))
    ensures a.dataType == Bit && a.bit >= 8 ==> r.value == 0
    ensures IsKnown(a.dataType) && a.dataType != Bit && a.dataType != Real ==>
      r == Ok(FromBigEndian(buff[..Size(a.dataType)]))
  {
    var t := a.dataType;
    if t == Bit then Ok(BitAt(buff[0], a.bit))
    else if t == Byte then Ok(buff[0])
    else if t == Word || t == Counter || t == Timer then Ok(FromBigEndian(buff[..2]))
    else if t == DWord || t == Real then
      var w := FromBigEndian(buff[..4]);
      assert Pow256(4) == 0x1_0000_0000;
      Ok(if t == Real then conv.fromBits(w) else w)
    else Err(UnknownDataType)
  }

  /** Decoding the image of a Byte, Word, Counter, Timer or DWord value
      gives the value modulo 2^(8 * Size). */
  lemma DecodeValueBytes(a: VmAddr, value: u32, conv: RealConv, rest: seq<u8>)
    requires IsKnown(a.dataType) && a.dataType != Bit && a.dataType != Real
    ensures Decode(a, ValueBytes(a.dataType, value, conv) + rest, conv) == Ok(value % Pow256(Size(a.dataType)))
  {
    var b := ValueBytes(a.dataType, value, conv);
    assert (b + rest)[..|b|] == b;
    if a.dataType == Byte {
      assert b == [value % 256];
    }
  }

  /** Decoding a Real reads the 4-byte image and applies `fromBits`. */
  lemma DecodeReal(a: VmAddr, value: u32, conv: RealConv)
    requires a.dataType == Real
    ensures Decode(a, ValueBytes(Real, value, conv), conv) == Ok(conv.fromBits(conv.toBits(value)))
  {
    var b := ValueBytes(Real, value, conv);
    assert b[..4] == b;
    FromBigEndianOfBigEndian(conv.toBits(value), 4);
  }

  /** With the intended encoder a bit write is read back: the decoder sees
      1 after writing a positive value and 0 after writing zero. */
  lemma BitRoundTripIntended(cur: u8, bit: u8, value: u32)
    requires bit < 8
    ensures BitAt(SetBitIntended(cur, bit, value), bit) == if value > 0 then 1 else 0
  {
  }

  /** As written, a bit write is not read back: writing 1 to bit 4 of a
      zero byte ORs in the mask 4, which sets bit 2, and bit 4 reads 0. */
  lemma BitRoundTripAsWrittenFails()
    ensures SetBitAsWritten(0, 4, 1) == 4
    ensures BitAt(SetBitAsWritten(0, 4, 1), 4) == 0
  {
  }

  /** As written, writing bit 0 changes nothing, whatever the value. */
  lemma BitZeroIsNoOp(cur: u8, value: u32)
    ensures SetBitAsWritten(cur, 0, value) == cur
  {
  }
}
