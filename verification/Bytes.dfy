/** Octets and big-endian integers, as src/common/read.c and the client's `to_bytes` see them. */
module Bytes {
  import opened Numerals

  type byte = b: int | 0 <= b < 256

  datatype Option<+T> = None | Some(value: T)

  function Min(a: nat, b: nat): nat {
    if a <= b then a else b
  }

  /** The unsigned integer a byte string spells, most significant byte first. */
  function BigEndian(s: seq<byte>): (n: nat)
    ensures n < Pow(256, |s|)
  {
    ValueBound(256, s);
    Value(256, s)
  }

  /** The `len`-byte spelling of `n`. */
  function ToBytes(n: nat, len: nat): (s: seq<byte>)
    requires n < Pow(256, len)
    ensures |s| == len
  {
    if len == 0 then [] else ToBytes(n / 256, len - 1) + [n % 256]
  }

  lemma {:induction false} BigEndianToBytes(n: nat, len: nat)
    requires n < Pow(256, len)
    ensures BigEndian(ToBytes(n, len)) == n
  {
    if len == 0 {
    } else {
      BigEndianToBytes(n / 256, len - 1);
      var s := ToBytes(n, len);
      assert s[..|s| - 1] == ToBytes(n / 256, len - 1);
    }
  }

  lemma {:induction false} ToBytesBigEndian(s: seq<byte>)
    ensures ToBytes(BigEndian(s), |s|) == s
  {
    if s == [] {
    } else {
      ToBytesBigEndian(s[..|s| - 1]);
    }
  }

  lemma OctetPowers()
    ensures Pow(256, 1) == 0x100
    ensures Pow(256, 2) == 0x1_0000
    ensures Pow(256, 4) == 0x1_0000_0000
    ensures Pow(256, 8) == 0x1_0000_0000_0000_0000
    ensures Pow(256, 3) == 0x100_0000
    ensures Pow(256, 7) == 0x100_0000_0000_0000
  {
    assert Pow(256, 4) == 256 * 256 * 256 * 256 * Pow(256, 0);
    assert Pow(256, 8) == 256 * 256 * 256 * 256 * Pow(256, 4);
  }

  /** The leading byte carries the sign bit of the whole field. */
  lemma {:induction false} LeadingByte(s: seq<byte>)
    requires s != []
    ensures s[0] >= 0x80 <==> BigEndian(s) >= 0x80 * Pow(256, |s| - 1)
  {
    if |s| == 1 {
      assert s[..0] == [];
    } else {
      LeadingByte(s[..|s| - 1]);
    }
  }

  /** The shift-and-or expressions of read.c in their own word widths: shifted octets fill bits
      the others leave clear, so or-ing them adds them up. */
  lemma OrIsSum16(a: bv16, b: bv16)
    requires a <= 0xFF && b <= 0xFF
    ensures (a << 8) | (b << 0) == a * 0x100 + b
  {
  }

  lemma OrIsSum32(a: bv32, b: bv32, c: bv32, d: bv32)
    requires a <= 0xFF && b <= 0xFF && c <= 0xFF && d <= 0xFF
    ensures (a << 24) | (b << 16) | (c << 8) | (d << 0) == a * 0x100_0000 + b * 0x1_0000 + c * 0x100 + d
  {
  }

  lemma OrIsSum64(a: bv64, b: bv64, c: bv64, d: bv64, e: bv64, f: bv64, g: bv64, h: bv64)
    requires a <= 0xFF && b <= 0xFF && c <= 0xFF && d <= 0xFF && e <= 0xFF && f <= 0xFF && g <= 0xFF && h <= 0xFF
    ensures (a << 56) | (b << 48) | (c << 40) | (d << 32) | (e << 24) | (f << 16) | (g << 8) | (h << 0)
         == a * 0x100_0000_0000_0000 + b * 0x1_0000_0000_0000 + c * 0x100_0000_0000 + d * 0x1_0000_0000
            + e * 0x100_0000 + f * 0x1_0000 + g * 0x100 + h
  {
  }

  lemma LastOctet(s: seq<byte>)
    requires s != []
    ensures BigEndian(s) == BigEndian(s[..|s| - 1]) * 256 + s[|s| - 1]
    ensures |s| == 1 ==> BigEndian(s) == s[0]
  {
  }

  /** Those sums are the big-endian value. */
  lemma ShiftForms(s: seq<byte>)
    ensures |s| == 1 ==> BigEndian(s) == s[0]
    ensures |s| == 2 ==> BigEndian(s) == s[0] as int * 0x100 + s[1]
  {
    if |s| == 1 {
      LastOctet(s);
    } else if |s| == 2 {
      LastOctet(s[..1]);
      LastOctet(s);
    }
  }

  lemma ShiftForm32(s: seq<byte>)
    requires |s| == 4
    ensures BigEndian(s) == s[0] as int * 0x100_0000 + s[1] as int * 0x1_0000 + s[2] as int * 0x100 + s[3]
  {
    assert s[..3][..2] == s[..2];
    ShiftForms(s[..2]);
    LastOctet(s[..3]);
    LastOctet(s);
  }

  lemma ShiftForm64(s: seq<byte>)
    requires |s| == 8
    ensures BigEndian(s) == BigEndian(s[..4]) * 0x1_0000_0000 + BigEndian(s[4..])
    ensures BigEndian(s)
         == s[0] as int * 0x100_0000_0000_0000 + s[1] as int * 0x1_0000_0000_0000
            + s[2] as int * 0x100_0000_0000 + s[3] as int * 0x1_0000_0000
            + s[4] as int * 0x100_0000 + s[5] as int * 0x1_0000 + s[6] as int * 0x100 + s[7] as int
  {
    OctetPowers();
    assert s == s[..4] + s[4..];
    ValueSplit(256, s[..4], s[4..]);
    ShiftForm32(s[..4]);
    ShiftForm32(s[4..]);
  }
}
