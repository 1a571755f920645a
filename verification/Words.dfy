/** Bytes, addresses and optional values; little-endian words and 32-bit address arithmetic. */
module Words {

  type byte = x: int | 0 <= x < 256

  /** A link-layer address. */
  type Mac = m: seq<byte> | |m| == 6 witness [0, 0, 0, 0, 0, 0]

  datatype Option<+T> = None | Some(value: T)

  /** Reduction of a u32 computation. */
  function Wrap32(x: int): (r: int)
    ensures 0 <= r < 0x1_0000_0000
  {
    x % 0x1_0000_0000
  }

  lemma WrapAdd(a: int, b: int, i: int)
    requires Wrap32(a) == Wrap32(b)
    ensures Wrap32(a + i) == Wrap32(b + i)
  {
    var q := a / 0x1_0000_0000 - b / 0x1_0000_0000;
    assert a + i == b + i + q * 0x1_0000_0000;
  }

  /** Bytes of a u16 as a little-endian host stores them. */
  function Le16(x: nat): (s: seq<byte>)
    ensures |s| == 2
  {
    [x % 256, x / 256 % 256]
  }

  function FromLe16(s: seq<byte>): (x: nat)
    requires |s| == 2
    ensures x < 0x1_0000
  {
    s[0] as int + 256 * (s[1] as int)
  }

  /** Bytes of a u32 as a little-endian host stores them. */
  function Le32(x: nat): (s: seq<byte>)
    ensures |s| == 4
  {
    [x % 256, x / 256 % 256, x / 0x1_0000 % 256, x / 0x100_0000 % 256]
  }

  function FromLe32(s: seq<byte>): (x: nat)
    requires |s| == 4
    ensures x < 0x1_0000_0000
  {
    s[0] as int + 256 * (s[1] as int) + 0x1_0000 * (s[2] as int) + 0x100_0000 * (s[3] as int)
  }

  lemma Le32RoundTrip(x: nat)
    requires x < 0x1_0000_0000
    ensures FromLe32(Le32(x)) == x
  {
    var x1 := x / 256;
    var x2 := x1 / 256;
    var x3 := x2 / 256;
    assert x / 0x1_0000 == x2;
    assert x / 0x100_0000 == x3;
    assert x3 % 256 == x3;
  }

  lemma FromLe32RoundTrip(s: seq<byte>)
    requires |s| == 4
    ensures Le32(FromLe32(s)) == s
  {
    var x := FromLe32(s);
    assert x / 256 == s[1] as int + 256 * (s[2] as int) + 0x1_0000 * (s[3] as int);
    assert x / 0x1_0000 == s[2] as int + 256 * (s[3] as int);
  }

  /** A u32 assembled from two halves is stored as the halves in order. */
  lemma Le32Halves(high: nat, low: nat)
    requires high < 0x1_0000 && low < 0x1_0000
    ensures Le32(high * 0x1_0000 + low) == Le16(low) + Le16(high)
  {
    var x := high * 0x1_0000 + low;
    assert x / 0x1_0000 == high;
    assert x / 256 == high * 256 + low / 256;
    assert x / 0x100_0000 == high / 256;
  }

  lemma Le16RoundTrip(x: nat)
    requires x < 0x1_0000
    ensures FromLe16(Le16(x)) == x
  {
  }

  lemma FromLe16RoundTrip(s: seq<byte>)
    requires |s| == 2
    ensures Le16(FromLe16(s)) == s
  {
  }
}
