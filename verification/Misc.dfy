/** The length field of firmware packets: libs/artnet/libartnet/misc.c. */
module Misc {
  import opened Base

  function Unsigned(bytes: seq<byte>): int
    requires |bytes| == 4
  {
    bytes[0] as int * 0x100_0000 + bytes[1] as int * 0x1_0000 + bytes[2] as int * 0x100 + bytes[3] as int
  }

  /** Four bytes, big-endian, as the signed 32-bit value they stand for. */
  function NBytesTo32(bytes: seq<byte>): (r: int)
    requires |bytes| == 4
    ensures -0x8000_0000 <= r < 0x8000_0000
    ensures (r < 0) == (bytes[0] >= 0x80)
  {
    ToInt32(Unsigned(bytes))
  }

  /** The bytes that the masks and shifts pick out of a 32-bit `data`. */
  function BigEndian(data: int): (bytes: seq<byte>)
    ensures |bytes| == 4
  {
    [(data % 0x1_0000_0000) / 0x100_0000, (data % 0x100_0000) / 0x1_0000, (data % 0x1_0000) / 0x100, data % 0x100]
  }

  method IntToBytes(data: int, bytes: array<byte>)
    requires bytes.Length >= 4
    modifies bytes
    ensures bytes[..4] == BigEndian(data)
    ensures bytes[4..] == old(bytes[4..])
  {
    bytes[3] := data % 0x100;
    bytes[2] := (data % 0x1_0000) / 0x100;
    bytes[1] := (data % 0x100_0000) / 0x1_0000;
    bytes[0] := (data % 0x1_0000_0000) / 0x100_0000;
  }

  lemma MultipleAtLeast(d: int, base: int)
    requires base > 0
    ensures d >= 1 ==> d * base >= base
    ensures d <= -1 ==> d * base <= -base
  {
    if d >= 1 {
      assert (d - 1) * base >= 0;
    } else if d <= -1 {
      assert (-1 - d) * base >= 0;
    }
  }

  lemma DigitsOf(b0: int, low: int, base: int)
    requires 0 <= low < base
    ensures (b0 * base + low) / base == b0
    ensures (b0 * base + low) % base == low
  {
    var q, r := (b0 * base + low) / base, (b0 * base + low) % base;
    assert b0 * base + low == q * base + r;
    assert (q - b0) * base == q * base - b0 * base == low - r;
    MultipleAtLeast(q - b0, base);
  }

  lemma ModMod(data: int, k: int, base: int)
    requires k > 0 && base > 0
    ensures (data % (k * base)) % base == data % base
  {
    var q, m := data / (k * base), data % (k * base);
    assert data == (k * base) * q + m;
    var l := m % base;
    assert m == m / base * base + l;
    assert (q * k + m / base) * base == (q * k) * base + m / base * base;
    assert (q * k) * base == (k * base) * q;
    DigitsOf(q * k + m / base, l, base);
  }

  /** A value that does not fit an `int` wraps around. */
  lemma Wraps(x: int)
    ensures (ToInt32(x) - x) % 0x1_0000_0000 == 0
  {
    var q, m := x / 0x1_0000_0000, x % 0x1_0000_0000;
    assert x == 0x1_0000_0000 * q + m;
    DigitsOf(-q, 0, 0x1_0000_0000);
    DigitsOf(-q - 1, 0, 0x1_0000_0000);
  }

  /** Decoding undoes encoding on every 32-bit integer, negative ones included. */
  lemma DecodeEncode(data: int)
    requires -0x8000_0000 <= data < 0x8000_0000
    ensures NBytesTo32(BigEndian(data)) == data
  {
    ModMod(data, 0x100, 0x100_0000);
    ModMod(data, 0x100, 0x1_0000);
    ModMod(data, 0x100, 0x100);
    assert Unsigned(BigEndian(data)) == data % 0x1_0000_0000;
  }

  lemma LowBytes(high: int, b1: byte, b2: byte, b3: byte, r: int)
    requires r == ((high * 0x100 + b1 as int) * 0x100 + b2 as int) * 0x100 + b3 as int
    ensures BigEndian(r)[1..] == [b1, b2, b3]
  {
    var low1 := b2 as int * 0x100 + b3 as int;
    var low2 := b1 as int * 0x1_0000 + low1;
    DigitsOf(high, low2, 0x100_0000);
    DigitsOf(b1, low1, 0x1_0000);
    DigitsOf(high * 0x100 + b1 as int, low1, 0x1_0000);
    DigitsOf(b2, b3, 0x100);
    DigitsOf((high * 0x100 + b1 as int) * 0x100 + b2 as int, b3, 0x100);
  }

  lemma HighByte(bytes: seq<byte>)
    requires |bytes| == 4
    ensures BigEndian(NBytesTo32(bytes))[0] == bytes[0]
  {
    var v := Unsigned(bytes);
    assert NBytesTo32(bytes) % 0x1_0000_0000 == v;
    DigitsOf(bytes[0], v - bytes[0] as int * 0x100_0000, 0x100_0000);
  }

  /** Encoding undoes decoding, so the two are inverse bijections. */
  lemma EncodeDecode(bytes: seq<byte>)
    requires |bytes| == 4
    ensures BigEndian(NBytesTo32(bytes)) == bytes
  {
    var r := NBytesTo32(bytes);
    var high := if bytes[0] < 0x80 then bytes[0] as int else bytes[0] as int - 0x100;
    HighByte(bytes);
    LowBytes(high, bytes[1], bytes[2], bytes[3], r);
    assert BigEndian(r) == [BigEndian(r)[0]] + BigEndian(r)[1..];
  }

  /** The first byte weighs 2^24, the last 1; a negative value stands for itself plus 2^32. */
  lemma BytesWeigh(data: int)
    requires -0x8000_0000 <= data < 0x8000_0000
    ensures var b := BigEndian(data);
      b[0] as int * 16777216 + b[1] as int * 65536 + b[2] as int * 256 + b[3] as int ==
        if data >= 0 then data else data + 4294967296
  {
    ModMod(data, 0x100, 0x100_0000);
    ModMod(data, 0x100, 0x1_0000);
    ModMod(data, 0x100, 0x100);
    assert Unsigned(BigEndian(data)) == data % 0x1_0000_0000;
  }
}
