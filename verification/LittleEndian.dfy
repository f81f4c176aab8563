/** Numbers as little-endian bytes, as all fields of the packets are stored. */
module LittleEndian {
  import opened Bytes

  /** The number that the k low bits of b stand for. */
  function ValueBits(b: Byte, k: nat): (n: nat)
    ensures n < Power2(k)
  {
    if k == 0 then 0 else 2 * ValueBits(b >> 1, k - 1) + LowBit(b)
  }

  function LowBit(b: Byte): (n: nat)
    ensures n < 2
  {
    if b & 1 == 1 then 1 else 0
  }

  function Power2(k: nat): (p: nat)
    ensures p > 0
  {
    if k == 0 then 1 else 2 * Power2(k - 1)
  }

  function Value(b: Byte): (n: nat)
    ensures n < 256
  {
    assert Power2(8) == 256;
    ValueBits(b, 8)
  }

  /** The byte of the k low bits of n. */
  function ByteBits(n: nat, k: nat): Byte {
    if k == 0 then 0 else Append(ByteBits(n / 2, k - 1), n % 2 == 1)
  }

  function Append(b: Byte, bit: bool): Byte {
    (b << 1) | (if bit then 1 else 0)
  }

  function ByteOf(n: nat): Byte
    requires n < 256
  {
    ByteBits(n, 8)
  }

  /** b has no bits above the k lowest. */
  predicate Short(b: Byte, k: nat) {
    if k == 0 then b == 0 else Short(b >> 1, k - 1)
  }

  lemma AppendBits(b: Byte, bit: bool)
    requires b & 0x80 == 0
    ensures Append(b, bit) >> 1 == b && LowBit(Append(b, bit)) == if bit then 1 else 0
  {
  }

  lemma ShortTop(b: Byte, k: nat)
    requires k <= 7 && Short(b, k)
    ensures b & 0x80 == 0
  {
    ShortMore(b, k, 7);
    var b1 := b >> 1;
    var b2 := b1 >> 1;
    var b3 := b2 >> 1;
    var b4 := b3 >> 1;
    var b5 := b4 >> 1;
    var b6 := b5 >> 1;
    var b7 := b6 >> 1;
    assert Short(b1, 6) && Short(b2, 5) && Short(b3, 4) && Short(b4, 3) && Short(b5, 2) && Short(b6, 1) && Short(b7, 0);
    SevenShifts(b, b1, b2, b3, b4, b5, b6, b7);
  }

  lemma SevenShifts(b: Byte, b1: Byte, b2: Byte, b3: Byte, b4: Byte, b5: Byte, b6: Byte, b7: Byte)
    requires b1 == b >> 1 && b2 == b1 >> 1 && b3 == b2 >> 1 && b4 == b3 >> 1
    requires b5 == b4 >> 1 && b6 == b5 >> 1 && b7 == b6 >> 1 && b7 == 0
    ensures b & 0x80 == 0
  {
  }

  lemma {:induction false} ShortMore(b: Byte, k: nat, m: nat)
    requires k <= m && Short(b, k)
    ensures Short(b, m)
    decreases m
  {
    if k > 0 {
      ShortMore(b >> 1, k - 1, m - 1);
    } else if m > 0 {
      assert b >> 1 == 0;
      ShortMore(b >> 1, 0, m - 1);
    }
  }

  lemma {:induction false} ByteBitsShort(n: nat, k: nat)
    requires k <= 8
    ensures Short(ByteBits(n, k), k)
  {
    hide Append;
    if k > 0 {
      ByteBitsShort(n / 2, k - 1);
      ShortTop(ByteBits(n / 2, k - 1), k - 1);
      AppendBits(ByteBits(n / 2, k - 1), n % 2 == 1);
    }
  }

  lemma {:induction false} ValueOfBits(n: nat, k: nat)
    requires k <= 8 && n < Power2(k)
    ensures ValueBits(ByteBits(n, k), k) == n
  {
    hide Append, LowBit;
    if k > 0 {
      ValueOfBits(n / 2, k - 1);
      ByteBitsShort(n / 2, k - 1);
      ShortTop(ByteBits(n / 2, k - 1), k - 1);
      AppendBits(ByteBits(n / 2, k - 1), n % 2 == 1);
    }
  }

  lemma HalfAndLow(b: Byte)
    ensures Append(b >> 1, LowBit(b) == 1) == b
  {
  }

  lemma {:induction false} BitsOfValue(b: Byte, k: nat)
    requires Short(b, k)
    ensures ByteBits(ValueBits(b, k), k) == b
  {
    hide Append, LowBit;
    if k > 0 {
      BitsOfValue(b >> 1, k - 1);
      HalfAndLow(b);
      var v := ValueBits(b, k);
      assert v / 2 == ValueBits(b >> 1, k - 1) && v % 2 == LowBit(b);
    }
  }

  lemma ShortByte(b: Byte)
    ensures Short(b, 8)
  {
    var c := ((((((b >> 1) >> 1) >> 1) >> 1) >> 1) >> 1) >> 1;
    assert c >> 1 == 0 && Short(c, 1);
    assert Short(((((((b >> 1) >> 1) >> 1) >> 1) >> 1) >> 1), 2) && Short((((((b >> 1) >> 1) >> 1) >> 1) >> 1), 3);
    assert Short(((((b >> 1) >> 1) >> 1) >> 1), 4) && Short((((b >> 1) >> 1) >> 1), 5);
    assert Short(((b >> 1) >> 1), 6) && Short((b >> 1), 7);
  }

  /** The number whose bytes are given, lowest first. */
  function FromBytes(bytes: seq<Byte>): nat {
    if bytes == [] then 0 else Value(bytes[0]) + 256 * FromBytes(bytes[1..])
  }

  function Power256(k: nat): (p: nat)
    ensures p > 0
  {
    if k == 0 then 1 else 256 * Power256(k - 1)
  }

  /** The k lowest bytes of n. */
  function ToLittleEndian(n: nat, k: nat): (bytes: seq<Byte>)
    ensures |bytes| == k
  {
    if k == 0 then [] else [ByteOf(n % 256)] + ToLittleEndian(n / 256, k - 1)
  }

  lemma ValueOfByte(n: nat)
    requires n < 256
    ensures Value(ByteOf(n)) == n
  {
    assert Power2(8) == 256;
    ValueOfBits(n, 8);
  }

  lemma ByteOfValue(b: Byte)
    ensures ByteOf(Value(b)) == b
  {
    ShortByte(b);
    BitsOfValue(b, 8);
  }

  /** Numbers that fit are read back. */
  lemma {:induction false} ReadBack(n: nat, k: nat)
    requires n < Power256(k)
    ensures FromBytes(ToLittleEndian(n, k)) == n
    decreases k
  {
    hide Value, ByteOf;
    if k > 0 {
      ReadBack(n / 256, k - 1);
      ValueOfByte(n % 256);
      assert ToLittleEndian(n, k)[1..] == ToLittleEndian(n / 256, k - 1);
    }
  }

  lemma {:induction false} FromBytesBound(bytes: seq<Byte>)
    ensures FromBytes(bytes) < Power256(|bytes|)
  {
    if bytes != [] {
      FromBytesBound(bytes[1..]);
    }
  }

  /** The last byte weighs most. */
  lemma {:induction false} FromBytesLast(bytes: seq<Byte>, b: Byte)
    ensures FromBytes(bytes + [b]) == FromBytes(bytes) + Power256(|bytes|) * Value(b)
  {
    hide Value;
    if bytes == [] {
      assert [b][1..] == [] && bytes + [b] == [b];
    } else {
      FromBytesLast(bytes[1..], b);
      assert (bytes + [b])[1..] == bytes[1..] + [b];
      Regroup(FromBytes(bytes[1..]), Power256(|bytes| - 1), Value(b));
    }
  }

  lemma Regroup(n: nat, p: nat, v: nat)
    ensures 256 * (n + p * v) == 256 * n + 256 * p * v
  {
  }

  /** Different bytes of the same length are different numbers. */
  lemma {:induction false} FromBytesInjective(a: seq<Byte>, b: seq<Byte>)
    requires |a| == |b| && FromBytes(a) == FromBytes(b)
    ensures a == b
  {
    hide Value, ByteOf;
    if a != [] {
      assert Value(a[0]) == Value(b[0]) && FromBytes(a[1..]) == FromBytes(b[1..]);
      ByteOfValue(a[0]);
      ByteOfValue(b[0]);
      FromBytesInjective(a[1..], b[1..]);
      assert a == [a[0]] + a[1..] && b == [b[0]] + b[1..];
    }
  }
}
